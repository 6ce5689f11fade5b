# deecli vault, modelled in Dafny

`deecli` is a command-line helper whose secret-handling core is a small encrypted vault:
a JSON file `~/.secrets.json` maps token names to *envelopes*, and each envelope is the
standard base64 text of `salt (16 bytes) || nonce (12 bytes) || AES-256-GCM ciphertext`,
where the key is scrypt(passphrase, salt) with N = 32768, r = 8, p = 1 and a 32-byte key.
Three interactive operations work on the vault:

- **Put** (`EncryptTokenInteractive`) loads the vault, asks before overwriting an existing
  name, reads the passphrase twice, encrypts the value and rewrites the file;
- **Get** (`GetTokenFromSecrets`) loads the vault, looks the name up, decrypts with the
  passphrase and shows the token only after a confirmation;
- **delete** (`delete-token`) loads the vault, asks for confirmation, proves the passphrase
  by decrypting the entry, removes it and rewrites the file.

Every confirmation gate accepts an answer exactly when, lower-cased and trimmed, it is `y`
or `yes`. The command file also picks a GitHub workflow to dispatch: the first listed
workflow whose path ends with the requested file name.

The model works on Go strings as byte sequences. `strings.TrimSpace` is modelled exactly,
including the multi-byte Unicode spaces. Base64 follows `base64.StdEncoding`: padding is
required, and `\r` and `\n` are skipped on decoding. The cryptographic primitives (scrypt,
AES-GCM seal and open) are parameters bundled in a `Suite`; the only assumption made about
them is AEAD correctness (`Sound`: opening what was sealed under the same key and nonce gives
the plaintext back). Randomness (the salt and nonce reads) and disk failures are parameters
too. The vault file is a `SecretsFile` object whose state the Put and delete methods change.
What a rewrite leaves in it is the map as the next decode reads it back: `encoding/json`
writes every name and envelope with each byte that does not start valid UTF-8 replaced by
U+FFFD, writes the names in Go string order, and on decoding keeps the last of two equal
names. Every map decoded from the file therefore has only valid UTF-8 names and envelopes
(`SecretsStore.DecodedSecrets`).
Each interactive operation is a method proved equal to a transition function. The properties
are lemmas about those functions: which outcome happens when, what the file holds
afterwards, and how Put, Get and delete relate. Put has two transition functions: the Put as
written (`PutTransitionAsWritten`, which the method follows), and the Put as the design
intends it (`PutTransition`), which refuses the two inputs listed under Findings. They agree
on every other input (`Encryptonite.PutAgreesAsWritten`). The Put lemmas and the laws
relating Put, Get and delete are about the intended Put.

Files:
- `wrappers.dfy`: `Option`, `Result`.
- `go_strings.dfy`: bytes, `TrimSpace`, `ToLower`, `HasSuffix`.
- `utf8.dfy`: valid UTF-8 and the U+FFFD repair `encoding/json` applies.
- `string_order.dfy`: Go's string order and the greatest string of a set.
- `prompt.dfy`: the y/yes rule and passphrase entry.
- `base64.dfy`: the standard base64 encoding and decoding.
- `primitives.dfy`: the abstract scrypt/AES-GCM suite.
- `encryptonite.dfy`: `encrypt` and Put.
- `decryptonite.dfy`: `Decrypt` and Get.
- `envelope_laws.dfy`: the envelope round trip.
- `secrets_store.dfy`: the vault file, loading and rewriting.
- `deecli.dfy`: delete and the workflow search.
- `vault_laws.dfy`: how the operations relate to each other.

## Where the code and the design differ

The model follows the code in each case below.

- **Rewriting the file.** The design asks for a whole-file replacement that leaves the
  previous file intact on any failure. The code instead calls `os.Create` on the vault path,
  which truncates it, and only then marshals and writes.
  - A marshal failure leaves an empty file (`SecretsStore.AfterRewrite`,
    `Encryptonite.MarshalFailureEmptiesVault`).
  - A write failure leaves a partial file.
- **A missing vault file.** The design treats it as an empty vault everywhere. Only Put
  does so. Get and delete fail when they open it (`Decryptonite.GetNeedsExistingVault`).
- **A zero-byte vault file.** Put loads it as an empty vault, without reporting a corrupt
  store. Get and delete report a decode error.
- **A vault file holding `null`.** The design says a document that is not an object is
  corrupt and must not be overwritten. The code decodes `null` without error into a nil map.
  - Get and delete see a vault with no entries and report every name as not found
    (`Decryptonite.NullVaultHasNoTokens`).
  - Put reaches the assignment into the nil map and panics (see Findings).
- **Error reporting.** The design asks for one generic decryption error. The code returns
  a distinct error from each failing step, and `Decryptonite.DecryptError` keeps those
  steps apart.

## Model

| member | source | states |
|---|---|---|
| GoStrings.TrimSpace | encryptonite/encryptonite.go:29 | the result is a slice of the input with only white-space runes (ASCII and Unicode) cut at each end, and it neither starts nor ends with a white-space rune |
| Prompt.ConfirmedIff | cmd/deecli/main.go:324-326 | an answer passes a confirmation gate if and only if it is "y" or "yes", in any letter case, padded by nothing but white space |
| Base64.EncodeToString | encryptonite/encryptonite.go:153 | the encoding is 4 characters per started group of 3 bytes, all from the standard alphabet or `=` |
| Base64.DecodeEncode | decryptonite/decryptonite.go:68-71 | standard base64 decoding inverts standard base64 encoding on every byte string |
| Utf8.ReplaceInvalid | encryptonite/encryptonite.go:107 | the string `json.MarshalIndent` writes for a Go string is valid UTF-8 |
| Utf8.ReplaceInvalidKeepsValid | encryptonite/encryptonite.go:107 | a valid UTF-8 string is written unchanged |
| StringOrder.Greatest | encryptonite/encryptonite.go:107 | of a non-empty set of names, the one marshalled last belongs to the set and every name of the set sorts before it or equals it |
| Encryptonite.Encrypt | encryptonite/encryptonite.go:120-154 | an envelope is produced exactly when both random reads succeed and scrypt yields a valid AES key; a failed salt read is a randomness error |
| Encryptonite.EncryptFrames | encryptonite/encryptonite.go:146-153 | the envelope decodes to the drawn salt, the drawn nonce and the GCM seal of the plaintext under scrypt(passphrase, salt), in that order |
| Encryptonite.EnvelopeLength | encryptonite/encryptonite.go:148-153 | when the seal appends a 16-byte tag, the envelope is 4 * ceil((44 + plaintext length) / 3) characters |
| Encryptonite.EnvelopeIsValid | encryptonite/encryptonite.go:153 | every envelope is ASCII, so it is written to the file unchanged |
| Decryptonite.SplitEnvelope | decryptonite/decryptonite.go:77-79 | the salt is 16 bytes and the nonce 12, and salt, nonce and sealed text put back together are the decoded data |
| Decryptonite.Decrypt | decryptonite/decryptonite.go:67-102 | text that is not base64 is refused, so is data shorter than 28 bytes, and a plaintext is returned only when GCM opens the sealed text under scrypt(passphrase, salt) and the stored nonce |
| Decryptonite.ShortEnvelopeRefusedBeforeKeyDerivation | decryptonite/decryptonite.go:73-81 | a too-short envelope gets the same refusal whatever the passphrase and primitives, so it is refused before any key is derived |
| EnvelopeLaws.KdfParametersAgree | decryptonite/decryptonite.go:81 | encryption and decryption use the same scrypt parameters |
| EnvelopeLaws.EncryptDecryptRoundTrip | decryptonite/decryptonite.go:67-102 | given AEAD correctness, every envelope decrypts with its passphrase to the plaintext sealed in it |
| SecretsStore.LoadOrEmpty | encryptonite/encryptonite.go:35-57 | Put's load: a missing or zero-size file is an empty vault, an object file its decoded map, a `null` file the nil map; a stat or open error and an undecodable file are the two failures, and nothing else fails |
| SecretsStore.LoadExisting | decryptonite/decryptonite.go:23-35 | Get's and delete's load: an object file is its decoded map and a `null` file the nil map; a missing or inaccessible file is an open error, an empty or undecodable one a decode error |
| SecretsStore.Reloaded | encryptonite/encryptonite.go:107-113 | a rewritten file holds the names as written, with invalid bytes repaired, and under each the repaired envelope of the greatest original name written that way |
| SecretsStore.ReloadedKeepsDecoded | encryptonite/encryptonite.go:107-113 | a map of valid UTF-8 names and envelopes is read back from the file exactly |
| SecretsStore.CollisionKeepsLast | encryptonite/encryptonite.go:107-113 | two names written alike become one entry under the valid spelling, holding the envelope of the name that sorts last |
| SecretsStore.RewriteKeepsDecoded | encryptonite/encryptonite.go:97-113 | a complete rewrite of a map of valid names and envelopes leaves the file holding exactly that map |
| SecretsStore.SecretsFile.Rewrite | encryptonite/encryptonite.go:97-114 | after create, marshal and write, the file holds the map as the decoder reads it back; a failed create leaves it alone, a failed marshal leaves it empty, a failed write leaves it corrupt |
| Encryptonite.StoreAsWritten | encryptonite/encryptonite.go:95 | the assignment panics exactly when the decoded map is nil |
| Encryptonite.PutTransitionAsWritten | encryptonite/encryptonite.go:89-97 | the Put as written panics only on a vault file holding `null`, and then before the file is created, so the file is unchanged |
| Encryptonite.PutTransition | encryptonite/encryptonite.go:95 | the intended Put never panics |
| Encryptonite.EncryptTokenInteractive | encryptonite/encryptonite.go:22-118 | the Put command leaves the file and reports the outcome that the Put as written gives for the trimmed answers, the panic included |
| Encryptonite.PutAgreesAsWritten | encryptonite/encryptonite.go:22-118 | on every vault file but a `null` one and for every valid UTF-8 name, the intended Put and the Put as written give the same file and outcome |
| Encryptonite.PutAsWrittenSavesReloaded | encryptonite/encryptonite.go:95-113 | the Put as written, saving a new name, leaves the old vault and the new entry as the decoder reads them back, whatever the name |
| Encryptonite.PutChangesFileOnlyWhenRewriting | encryptonite/encryptonite.go:35-114 | a Put, as written or intended, that ends at a load error, a declined overwrite, mismatched passphrases, an encryption error or the panic leaves the file as it was |
| Encryptonite.PutSavedIff | encryptonite/encryptonite.go:35-117 | the intended Put saves if and only if the file holds a vault (not `null`), the name is valid UTF-8 and new or its overwrite confirmed, both passphrase entries match, encryption succeeds and the rewrite succeeds |
| Encryptonite.PutSavedContents | encryptonite/encryptonite.go:89-114 | after a save the file holds the loaded vault with the name bound to the new envelope: every other entry as it was, and no other name |
| Encryptonite.DeclinedOverwriteKeepsVault | encryptonite/encryptonite.go:59-68 | declining to overwrite aborts with the file unchanged, whatever the passphrases, randomness or disk faults |
| Encryptonite.PassphraseMismatchKeepsVault | encryptonite/encryptonite.go:85-87 | passphrase entries that differ end the Put with that error and the file unchanged, whatever the primitives, randomness or disk faults |
| Encryptonite.MarshalFailureEmptiesVault | encryptonite/encryptonite.go:97-110 | a marshal failure after the truncating create leaves an empty file, which the next Put loads as a vault with no entries |
| Encryptonite.NullVaultPanicsAsWritten | encryptonite/encryptonite.go:51-97 | a vault file holding `null` decodes to a nil map, the name lookup misses, and once encryption succeeds the assignment into it panics with the file unchanged |
| Encryptonite.NullVaultRefused | encryptonite/encryptonite.go:51-57 | the intended Put refuses a vault file holding `null` as undecodable, with the file unchanged, whatever is typed |
| Encryptonite.InvalidNameRefused | encryptonite/encryptonite.go:60 | the intended Put refuses a name that is not valid UTF-8 before looking it up, with the file unchanged |
| Decryptonite.GetTokenFromSecrets | decryptonite/decryptonite.go:21-65 | the Get command returns what `GetResult` gives for the trimmed answers, and it only reads the file |
| Decryptonite.GetSucceedsIff | decryptonite/decryptonite.go:41-64 | a Get returns a token if and only if the vault decodes, holds the name, the envelope decrypts under the passphrase and display is confirmed; the token is that plaintext |
| Decryptonite.GetNeedsExistingVault | decryptonite/decryptonite.go:23-35 | a missing vault is an open error for Get and a zero-size one a decode error |
| Decryptonite.UnknownNameReportedFirst | decryptonite/decryptonite.go:41-49 | an unknown name is reported as not found whatever the passphrase, primitives or display answer |
| Decryptonite.DecryptBeforeDisplay | decryptonite/decryptonite.go:51-62 | a failed decryption is reported whatever the display answer, and a declined display hides even a token that decrypted |
| Decryptonite.NullVaultHasNoTokens | decryptonite/decryptonite.go:32-44 | in a `null` vault every name is not found |
| Deecli.DeleteToken | cmd/deecli/main.go:287-376 | the delete command leaves the file and reports the outcome that `DeleteTransition` gives for the trimmed answers |
| Deecli.DeletedIff | cmd/deecli/main.go:295-374 | a delete succeeds if and only if the vault decodes, holds the name, deletion is confirmed, the passphrase is read and decrypts the entry, and the rewrite succeeds |
| Deecli.DeletedRemovesOnlyName | cmd/deecli/main.go:349-372 | after a delete the file holds exactly the old vault minus the name, which it held |
| Deecli.DeleteOpenedEntry | cmd/deecli/main.go:316-372 | a confirmed delete of a held name with a passphrase that opens its envelope, and no disk fault, leaves exactly the vault minus that entry |
| Deecli.DeleteUnknownNameKeepsVault | cmd/deecli/main.go:316-320 | an unknown name is reported as not found with the file unchanged, whatever the confirmation, passphrase, primitives or disk faults |
| Deecli.WrongPassphraseKeepsToken | cmd/deecli/main.go:341-346 | a passphrase that does not decrypt the entry aborts the delete with a verification error and the file unchanged |
| Deecli.DeclinedDeleteKeepsVault | cmd/deecli/main.go:322-329 | declining a delete aborts it with the file unchanged, whatever the passphrase, primitives or disk faults |
| Deecli.DeleteChangesFileOnlyWhenRewriting | cmd/deecli/main.go:295-372 | a delete that ends before the rewrite leaves the file as it was |
| Deecli.FindWorkflowId | cmd/deecli/main.go:68-76 | the ID returned is that of the first workflow whose path ends with the file name; an error naming the file means no path does |
| VaultLaws.PutThenGet | encryptonite/encryptonite.go:89-114 | given AEAD correctness, a token saved by the intended Put is returned by Get under the same name and passphrase once display is confirmed |
| VaultLaws.PutKeepsOtherTokens | encryptonite/encryptonite.go:95 | a saved intended Put does not change what Get reports for any other name of an existing vault |
| VaultLaws.DeleteThenGet | cmd/deecli/main.go:349 | after a delete, Get reports the name as not found |
| VaultLaws.DeleteKeepsOtherTokens | cmd/deecli/main.go:349 | a delete does not change what Get reports for any other name |
| VaultLaws.DeleteAddedEntry | cmd/deecli/main.go:341-372 | deleting, with a passphrase that opens it, an entry just added to a vault restores the vault |
| VaultLaws.PutThenDeleteRestores | cmd/deecli/main.go:341-372 | given AEAD correctness, saving a new name with the intended Put and deleting it with the same passphrase restores the vault exactly |
| VaultLaws.MangledNameCollides | encryptonite/encryptonite.go:107 | the name `"a\xff"` is not valid UTF-8, is written as `"a\ufffd"`, which is, and sorts after it |
| VaultLaws.InvalidNameReplacesTokenAsWritten | encryptonite/encryptonite.go:60-113 | as written, a Put under a name that is not valid UTF-8 and is written as a held name sorting before it reports success, replaces the held token without asking, and Get under the typed name finds nothing |

## Left out

- The commands that talk to the network are not modelled: GitHub repository creation, workflow dispatch, the HTTP request and JSON decoding in `getWorkflowID`, and the update check in `internal/update/update.go`. `Deecli.FindWorkflowId` takes the decoded workflow list as input.
- The shell shortcuts that run external programs are not modelled. Neither are the cobra command wiring, the output messages or `GetTokenByName`. None of them holds vault logic.
- scrypt, AES and GCM are not modelled inside: they are the `Suite` parameter. For that reason, confidentiality, rejection of a wrong passphrase, tamper detection and nonce uniqueness cannot be stated. The proofs assume only AEAD correctness (`Sound`) and, for `EnvelopeLength`, a 16-byte tag.
- `cipher.NewGCM` is not modelled as a failing step: it cannot fail on an AES block cipher, so only `aes.NewCipher`'s key-size check is kept.
- `crypto/rand` is the `saltDraw` and `nonceDraw` parameters. None stands for a failed read.
- JSON syntax is not modelled. The file is reduced to the cases the code tells apart: a JSON object, `null`, an undecodable file, an empty file, no file, or a file that cannot be accessed. Trailing data after the first JSON value, indentation and the escapes that decode back to the same bytes are not modelled; the repair of invalid UTF-8, the key order and the decoder keeping the last of two equal keys are (`SecretsStore.Reloaded`).
- SecretsStore.AfterRewrite: a failed write is modelled as leaving an undecodable file. A write that fails before writing anything leaves an empty file, which Put would load as an empty vault; the model does not separate the two.
- `Close` errors are not modelled. The code only prints a warning for them.
- Concurrent invocations racing on the same file are not modelled. The `HOME` lookup is not modelled either: the file is one `SecretsFile` object.
- Terminal handling is not modelled. Each prompt gets its own input line, with its newline, as an interactive terminal supplies it. The extra buffering of a fresh `bufio.Reader` per prompt, which can swallow piped lines, is not modelled.
- The ignored `ReadString` errors are not modelled separately. An input line that ends at EOF is just a line without a newline.
- GoStrings.ToLower: only ASCII letters are lower-cased. No non-ASCII letter lower-cases to `y`, `e`, `s` or a white-space byte, so the confirmation verdict is the same as with full Unicode case mapping.

## Findings

| source | as written | input that shows it | evidently intended | confidence | as-written member | corrected member |
|---|---|---|---|---|---|---|
| encryptonite/encryptonite.go:95 | the token is assigned into the map the JSON decoder produced; a vault file holding `null` decodes to a nil map (line 51), and assigning into a nil map is a run-time panic | vault file containing `null`, any token name, matching passphrases | a document that is not an object is a corrupt store, refused with an error and not overwritten | not executed | Encryptonite.NullVaultPanicsAsWritten | Encryptonite.NullVaultRefused |
| encryptonite/encryptonite.go:60-113 | the name is looked up as typed, but `json.MarshalIndent` writes it with invalid UTF-8 repaired, and the decoder keeps the last of two equal names; a typed name that is not valid UTF-8 can collide with a held one without the overwrite prompt | vault holding `"a\ufffd"`; Put with name bytes `61 FF` and matching passphrases: Put reports success, the old `"a\ufffd"` token is gone, Get `"a\xff"` reports not found | never replace a token without the overwrite confirmation, and keep every saved token retrievable under the name it was saved with | not executed | VaultLaws.InvalidNameReplacesTokenAsWritten | Encryptonite.InvalidNameRefused |
