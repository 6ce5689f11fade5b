/** What Put, Get and delete promise about one another over the same vault file. */
module VaultLaws {
  import opened Wrappers
  import opened GoStrings
  import opened Utf8
  import opened StringOrder
  import opened Primitives
  import opened SecretsStore
  import opened Encryptonite
  import opened Decryptonite
  import opened Deecli
  import EnvelopeLaws

  /**
   * A token saved by the intended Put comes back from Get under the same name and
   * passphrase, once display is confirmed (given AEAD correctness).
   */
  lemma PutThenGet(file: FileState, suite: Suite, put: PutAnswers, saltDraw: Option<Salt>, nonceDraw: Option<Nonce>,
                   fault: WriteFault, get: GetAnswers)
    requires Sound(suite)
    requires PutTransition(file, suite, put, saltDraw, nonceDraw, fault).1 == Saved
    requires get.name == put.name && get.passphrase == put.passphrase && get.display
    ensures GetResult(PutTransition(file, suite, put, saltDraw, nonceDraw, fault).0, suite, get) == Success(put.value)
  {
    PutSavedContents(file, suite, put, saltDraw, nonceDraw, fault);
    EnvelopeLaws.EncryptDecryptRoundTrip(suite, put.value, put.passphrase, saltDraw, nonceDraw);
  }

  /** A saved Put leaves what Get reports for every other name as it was, on a vault that already existed. */
  lemma PutKeepsOtherTokens(file: FileState, suite: Suite, put: PutAnswers, saltDraw: Option<Salt>, nonceDraw: Option<Nonce>,
                            fault: WriteFault, getSuite: Suite, get: GetAnswers)
    requires PutTransition(file, suite, put, saltDraw, nonceDraw, fault).1 == Saved
    requires LoadExisting(file).Success?
    requires get.name != put.name
    ensures GetResult(PutTransition(file, suite, put, saltDraw, nonceDraw, fault).0, getSuite, get) == GetResult(file, getSuite, get)
  {
    PutSavedContents(file, suite, put, saltDraw, nonceDraw, fault);
    var after := PutTransition(file, suite, put, saltDraw, nonceDraw, fault).0;
    assert LoadExisting(file).value.Entries() == LoadOrEmpty(file).value.Entries();
    assert get.name in after.secrets <==> get.name in LoadExisting(file).value.Entries();
  }

  /** Once a delete has succeeded, Get no longer finds the name, whatever passphrase is offered. */
  lemma DeleteThenGet(file: FileState, suite: Suite, del: DeleteAnswers, fault: WriteFault, getSuite: Suite, get: GetAnswers)
    requires DeleteTransition(file, suite, del, fault).1 == Deleted
    requires get.name == del.name
    ensures GetResult(DeleteTransition(file, suite, del, fault).0, getSuite, get) == Failure(Decryptonite.NotFound(get.name))
  {
    DeletedRemovesOnlyName(file, suite, del, fault);
  }

  /** A successful delete leaves what Get reports for every other name as it was. */
  lemma DeleteKeepsOtherTokens(file: FileState, suite: Suite, del: DeleteAnswers, fault: WriteFault, getSuite: Suite, get: GetAnswers)
    requires DeleteTransition(file, suite, del, fault).1 == Deleted
    requires get.name != del.name
    ensures GetResult(DeleteTransition(file, suite, del, fault).0, getSuite, get) == GetResult(file, getSuite, get)
  {
    DeletedRemovesOnlyName(file, suite, del, fault);
    var after := DeleteTransition(file, suite, del, fault).0;
    assert get.name in after.secrets <==> get.name in LoadExisting(file).value.Entries();
  }

  /**
   * Saving a new name and then deleting it with the same passphrase restores the vault
   * exactly (given AEAD correctness): the saved envelope proves the passphrase.
   */
  lemma PutThenDeleteRestores(secrets: DecodedSecrets, suite: Suite, put: PutAnswers, saltDraw: Option<Salt>, nonceDraw: Option<Nonce>,
                              del: DeleteAnswers)
    requires Sound(suite)
    requires put.name !in secrets
    requires PutTransition(Holds(secrets), suite, put, saltDraw, nonceDraw, NoFault).1 == Saved
    requires del == DeleteAnswers(put.name, true, Some(put.passphrase))
    ensures DeleteTransition(PutTransition(Holds(secrets), suite, put, saltDraw, nonceDraw, NoFault).0, suite, del, NoFault)
      == (Holds(secrets), Deleted)
  {
    PutSavedIff(Holds(secrets), suite, put, saltDraw, nonceDraw, NoFault);
    PutSavedContents(Holds(secrets), suite, put, saltDraw, nonceDraw, NoFault);
    EnvelopeIsValid(suite, put.value, put.passphrase, saltDraw, nonceDraw);
    EnvelopeLaws.EncryptDecryptRoundTrip(suite, put.value, put.passphrase, saltDraw, nonceDraw);
    var envelope := Encrypt(suite, put.value, put.passphrase, saltDraw, nonceDraw).value;
    DeleteAddedEntry(secrets, suite, put.name, envelope, del);
  }

  /** Deleting, with a passphrase that opens it, an entry just added to a vault restores the vault. */
  lemma DeleteAddedEntry(secrets: DecodedSecrets, suite: Suite, name: Bytes, envelope: Bytes, del: DeleteAnswers)
    requires name !in secrets && IsValid(name) && IsValid(envelope)
    requires del.name == name && del.confirmed && del.passphrase.Some?
    requires Decryptonite.Decrypt(suite, envelope, del.passphrase.value).Success?
    ensures DeleteTransition(Holds(secrets[name := envelope]), suite, del, NoFault) == (Holds(secrets), Deleted)
  {
    var stored: DecodedSecrets := secrets[name := envelope];
    DeleteOpenedEntry(stored, suite, del);
    AddThenRemove(secrets, name, envelope);
  }

  lemma AddThenRemove(m: map<Bytes, Bytes>, k: Bytes, v: Bytes)
    requires k !in m
    ensures m[k := v] - {k} == m
  {
  }

  /** `"a\xff"`: a name that is not valid UTF-8. */
  const MangledName: Bytes := [0x61, 0xFF]
  /** `"a\ufffd"`: how `encoding/json` writes it. */
  const RepairedName: Bytes := [0x61, 0xEF, 0xBF, 0xBD]

  /**
   * "a\xff" is not valid UTF-8, is written as "a\ufffd", which is, and sorts after it:
   * the two names collide in the file and "a\xff" is written last.
   */
  lemma MangledNameCollides()
    ensures !IsValid(MangledName) && IsValid(RepairedName)
    ensures ReplaceInvalid(MangledName) == RepairedName && RepairedName != MangledName
    ensures ByteLe(RepairedName, MangledName)
  {
    RepairedNameIsValid();
    MangledNameRepaired();
    assert RepairedName[1..] == [0xEF, 0xBF, 0xBD] && MangledName[1..] == [0xFF];
  }

  lemma RepairedNameIsValid()
    ensures IsValid(RepairedName) && ReplaceInvalid(RepairedName) == RepairedName
  {
    assert RuneLen(RepairedName) == 1;
    assert RepairedName[1..] == [0xEF, 0xBF, 0xBD];
    assert RuneLen([0xEF, 0xBF, 0xBD]) == 3;
    assert [0xEF, 0xBF, 0xBD][3..] == [];
    ReplaceInvalidKeepsValid(RepairedName);
  }

  lemma MangledNameRepaired()
    ensures !IsValid(MangledName) && ReplaceInvalid(MangledName) == RepairedName
  {
    assert RuneLen(MangledName) == 1;
    assert MangledName[1..] == [0xFF];
    assert RuneLen([0xFF]) == 0;
    assert [0xFF][1..] == [];
    assert ReplaceInvalid([0xFF]) == Replacement;
  }

  /**
   * As written, a Put under a name that is not valid UTF-8 can silently replace another
   * token: when the vault holds the valid spelling the typed name is written as, and the
   * typed name sorts after it, the lookup misses so no overwrite is asked, both are written
   * alike and the decoder keeps the last, the new envelope. The Put reports success, the
   * old token is gone, and Get under the typed name finds nothing. `MangledNameCollides`
   * gives such a pair: "a\ufffd" held, "a\xff" typed.
   */
  lemma InvalidNameReplacesTokenAsWritten(held: Bytes, previous: Bytes, suite: Suite, put: PutAnswers,
                                          saltDraw: Option<Salt>, nonceDraw: Option<Nonce>, getSuite: Suite, get: GetAnswers)
    requires IsValid(held) && IsValid(previous)
    requires ReplaceInvalid(put.name) == held && held != put.name && ByteLe(held, put.name)
    requires put.passphrase == put.confirmation
    requires Encrypt(suite, put.value, put.passphrase, saltDraw, nonceDraw).Success?
    requires get.name == put.name
    ensures var file := Holds(map[held := previous]);
      var envelope := Encrypt(suite, put.value, put.passphrase, saltDraw, nonceDraw).value;
      var (after, outcome) := PutTransitionAsWritten(file, suite, put, saltDraw, nonceDraw, NoFault);
      && outcome == Saved
      && after.Holds? && after.secrets == map[held := envelope]
      && GetResult(after, getSuite, get) == Failure(Decryptonite.NotFound(put.name))
  {
    EnvelopeIsValid(suite, put.value, put.passphrase, saltDraw, nonceDraw);
    var envelope := Encrypt(suite, put.value, put.passphrase, saltDraw, nonceDraw).value;
    var vault: DecodedSecrets := map[held := previous];
    PutAsWrittenSavesReloaded(vault, suite, put, saltDraw, nonceDraw);
    assert vault[put.name := envelope] == map[held := previous, put.name := envelope];
    CollisionKeepsLast(held, put.name, previous, envelope);
  }
}
