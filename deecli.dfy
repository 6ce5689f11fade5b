/**
 * The parts of the `deecli` command file modelled here: the `delete-token` command, which
 * removes one entry of the vault after the passphrase has proved itself on it, and the
 * search through a repository's workflows that picks the one to dispatch.
 */
module Deecli {
  import opened Wrappers
  import opened GoStrings
  import opened Primitives
  import opened SecretsStore
  import opened Prompt
  import Decryptonite

  /**
   * What the terminal supplies to `delete-token`: the name line, the confirmation line and
   * the hidden passphrase read, None when `term.ReadPassword` fails.
   */
  datatype DeleteInput = DeleteInput(nameLine: Bytes, confirmLine: Bytes, passphraseRead: Option<Bytes>)

  /** The answers a delete acts on; unlike Put and Get, a failed passphrase read stays a failure. */
  datatype DeleteAnswers = DeleteAnswers(name: Bytes, confirmed: bool, passphrase: Option<Bytes>)

  function DeleteAnswersOf(input: DeleteInput): DeleteAnswers {
    DeleteAnswers(
      TrimSpace(input.nameLine),
      IsConfirmed(input.confirmLine),
      if input.passphraseRead.Some? then Some(TrimSpace(input.passphraseRead.value)) else None)
  }

  datatype DeleteError =
    | LoadFailed(loadError: LoadError)
    | PassphraseUnreadable
    | VerificationFailed(decryptError: Decryptonite.DecryptError)
    | PersistFailed(writeError: WriteError)

  /** What the command reports: deleted, "not found", "Aborted by user.", or an error. */
  datatype DeleteOutcome = Deleted | NotFound | Aborted | DeleteFailed(error: DeleteError)

  /**
   * The `delete-token` handler, step by step: open and decode the vault, look the name up,
   * ask for confirmation, read the passphrase, prove it by decrypting the entry, remove the
   * entry and rewrite the file. Gives the file afterwards and the outcome.
   */
  function DeleteTransition(file: FileState, suite: Suite, answers: DeleteAnswers, fault: WriteFault)
    : (r: (FileState, DeleteOutcome))
  {
    match LoadExisting(file)
    case Failure(e) => (file, DeleteFailed(LoadFailed(e)))
    case Success(secrets) =>
      if answers.name !in secrets.Entries() then (file, NotFound)
      else if !answers.confirmed then (file, Aborted)
      else
        match answers.passphrase
        case None => (file, DeleteFailed(PassphraseUnreadable))
        case Some(passphrase) =>
          match Decryptonite.Decrypt(suite, secrets.Entries()[answers.name], passphrase)
          case Failure(e) => (file, DeleteFailed(VerificationFailed(e)))
          case Success(_) =>
            var after := AfterRewrite(file, secrets.Entries() - {answers.name}, fault);
            match WriteErrorOf(fault)
            case Some(e) => (after, DeleteFailed(PersistFailed(e)))
            case None => (after, Deleted)
  }

  /** The `delete-token` command against the vault file `f`. */
  method DeleteToken(f: SecretsFile, suite: Suite, input: DeleteInput, fault: WriteFault) returns (outcome: DeleteOutcome)
    modifies f
    ensures (f.state, outcome) == DeleteTransition(old(f.state), suite, DeleteAnswersOf(input), fault)
  {
    var loaded := LoadExisting(f.state);
    if loaded.Failure? {
      return DeleteFailed(LoadFailed(loaded.error));
    }
    var secrets: Secrets := loaded.value.Entries();
    var tokenName := TrimSpace(input.nameLine);
    if tokenName !in secrets {
      return NotFound;
    }
    var encryptedToken := secrets[tokenName];
    if !IsConfirmed(input.confirmLine) {
      return Aborted;
    }
    if input.passphraseRead.None? {
      return DeleteFailed(PassphraseUnreadable);
    }
    var passphrase := TrimSpace(input.passphraseRead.value);
    var verified := Decryptonite.Decrypt(suite, encryptedToken, passphrase);
    if verified.Failure? {
      return DeleteFailed(VerificationFailed(verified.error));
    }
    secrets := secrets - {tokenName};
    var err := f.Rewrite(secrets, fault);
    if err.Some? {
      return DeleteFailed(PersistFailed(err.value));
    }
    outcome := Deleted;
  }

  /**
   * A delete succeeds exactly when the vault decodes, holds the name, the deletion is
   * confirmed, the passphrase was read and decrypts the entry, and the rewrite succeeds.
   */
  lemma DeletedIff(file: FileState, suite: Suite, answers: DeleteAnswers, fault: WriteFault)
    ensures DeleteTransition(file, suite, answers, fault).1 == Deleted <==>
      && LoadExisting(file).Success?
      && answers.name in LoadExisting(file).value.Entries()
      && answers.confirmed
      && answers.passphrase.Some?
      && Decryptonite.Decrypt(suite, LoadExisting(file).value.Entries()[answers.name], answers.passphrase.value).Success?
      && fault == NoFault
  {
  }

  /** After a successful delete the file holds the vault it was loaded from less the name, which it held. */
  lemma DeletedRemovesOnlyName(file: FileState, suite: Suite, answers: DeleteAnswers, fault: WriteFault)
    requires DeleteTransition(file, suite, answers, fault).1 == Deleted
    ensures var after := DeleteTransition(file, suite, answers, fault).0;
      var before := LoadExisting(file).value.Entries();
      after.Holds? && answers.name in before && after.secrets == before - {answers.name}
  {
    DeletedIff(file, suite, answers, fault);
    var before := LoadExisting(file).value.Entries();
    RewriteKeepsDecoded(file, before - {answers.name});
  }

  /**
   * A confirmed delete of a held name, with a passphrase that opens its envelope, removes
   * exactly that entry from a vault file holding an object.
   */
  lemma DeleteOpenedEntry(secrets: DecodedSecrets, suite: Suite, answers: DeleteAnswers)
    requires answers.name in secrets && answers.confirmed && answers.passphrase.Some?
    requires Decryptonite.Decrypt(suite, secrets[answers.name], answers.passphrase.value).Success?
    ensures DeleteTransition(Holds(secrets), suite, answers, NoFault) == (Holds(secrets - {answers.name}), Deleted)
  {
    RewriteKeepsDecoded(Holds(secrets), secrets - {answers.name});
  }

  /**
   * A name the vault does not hold is reported as not found before anything else is asked
   * or used: the outcome and the file depend neither on the confirmation, the passphrase,
   * the primitives nor the disk.
   */
  lemma DeleteUnknownNameKeepsVault(file: FileState, suite1: Suite, suite2: Suite, answers1: DeleteAnswers, answers2: DeleteAnswers,
                                    fault1: WriteFault, fault2: WriteFault)
    requires LoadExisting(file).Success? && answers1.name !in LoadExisting(file).value.Entries()
    requires answers1.name == answers2.name
    ensures DeleteTransition(file, suite1, answers1, fault1) == DeleteTransition(file, suite2, answers2, fault2) == (file, NotFound)
  {
  }

  /** A passphrase that does not decrypt the entry aborts the delete and leaves the file as it was. */
  lemma WrongPassphraseKeepsToken(file: FileState, suite: Suite, answers: DeleteAnswers, fault: WriteFault)
    requires LoadExisting(file).Success? && answers.name in LoadExisting(file).value.Entries()
    requires answers.confirmed && answers.passphrase.Some?
    requires Decryptonite.Decrypt(suite, LoadExisting(file).value.Entries()[answers.name], answers.passphrase.value).Failure?
    ensures DeleteTransition(file, suite, answers, fault).0 == file
    ensures DeleteTransition(file, suite, answers, fault).1.DeleteFailed?
    ensures DeleteTransition(file, suite, answers, fault).1.error.VerificationFailed?
  {
  }

  /**
   * Declining the delete ends the command before the passphrase is read: the outcome and
   * the file depend neither on the passphrase, nor the primitives, nor the disk.
   */
  lemma DeclinedDeleteKeepsVault(file: FileState, suite1: Suite, suite2: Suite, answers1: DeleteAnswers, answers2: DeleteAnswers,
                                 fault1: WriteFault, fault2: WriteFault)
    requires LoadExisting(file).Success? && answers1.name in LoadExisting(file).value.Entries()
    requires answers1.name == answers2.name && !answers1.confirmed && !answers2.confirmed
    ensures DeleteTransition(file, suite1, answers1, fault1) == DeleteTransition(file, suite2, answers2, fault2) == (file, Aborted)
  {
  }

  /** A delete that neither succeeds nor fails in the rewrite leaves the vault file exactly as it was. */
  lemma DeleteChangesFileOnlyWhenRewriting(file: FileState, suite: Suite, answers: DeleteAnswers, fault: WriteFault)
    ensures var (after, outcome) := DeleteTransition(file, suite, answers, fault);
      after != file ==> outcome == Deleted || (outcome.DeleteFailed? && outcome.error.PersistFailed?)
  {
  }

  /** A workflow as the GitHub API lists it; the ID is an `int64`. */
  type Int64 = x: int | -0x8000_0000_0000_0000 <= x < 0x8000_0000_0000_0000
  datatype Workflow = Workflow(id: Int64, name: Bytes, path: Bytes)

  datatype WorkflowError = WorkflowNotFound(filename: Bytes)

  /**
   * The search of `getWorkflowID`: the ID of the first listed workflow whose path ends with
   * the file name, or an error naming the file when none does.
   */
  method FindWorkflowId(workflows: seq<Workflow>, workflowFilename: Bytes) returns (r: Result<Int64, WorkflowError>)
    ensures r.Success? ==>
      exists i :: 0 <= i < |workflows| && workflows[i].id == r.value && HasSuffix(workflows[i].path, workflowFilename)
        && forall j :: 0 <= j < i ==> !HasSuffix(workflows[j].path, workflowFilename)
    ensures r.Failure? ==>
      r.error == WorkflowNotFound(workflowFilename)
      && forall i :: 0 <= i < |workflows| ==> !HasSuffix(workflows[i].path, workflowFilename)
  {
    var i := 0;
    while i < |workflows|
      invariant 0 <= i <= |workflows|
      invariant forall j :: 0 <= j < i ==> !HasSuffix(workflows[j].path, workflowFilename)
    {
      if HasSuffix(workflows[i].path, workflowFilename) {
        return Success(workflows[i].id);
      }
      i := i + 1;
    }
    return Failure(WorkflowNotFound(workflowFilename));
  }
}
