/**
 * The vault file `$HOME/.secrets.json`: a JSON object from token name to envelope, read
 * whole at the start of an operation and rewritten whole at the end. Its contents are
 * abstracted to the cases the code tells apart; JSON syntax itself is not modelled.
 */
module SecretsStore {
  import opened Wrappers
  import opened GoStrings
  import opened Utf8
  import opened StringOrder

  /** `type Secrets map[string]string`: token name to envelope. */
  type Secrets = map<Bytes, Bytes>

  /** Every name and envelope is valid UTF-8: the decoder repairs any string it reads, so every decoded map is like this. */
  predicate IsDecoded(m: Secrets) {
    forall k :: k in m ==> IsValid(k) && IsValid(m[k])
  }

  type DecodedSecrets = m: Secrets | IsDecoded(m) witness map[]

  /** What a `Secrets` variable holds after decoding: a map, or Go's nil map when the document is `null`. */
  datatype SecretsValue = Nil | Live(m: DecodedSecrets) {
    /** What lookups see: a nil map reads as an empty one. */
    function Entries(): DecodedSecrets {
      if Nil? then map[] else m
    }
  }

  /** What is at the vault path. */
  datatype FileState =
    | Absent                 // stat and open report that it does not exist
    | Inaccessible           // it exists, but stat or open fails for another reason
    | Empty                  // it exists and has size 0
    | Holds(secrets: DecodedSecrets)  // a JSON object of name -> envelope, as decoded
    | HoldsNull              // the JSON document `null`
    | Corrupt                // anything the JSON decoder rejects

  datatype LoadError = AccessFailed | OpenFailed | DecodeFailed

  /**
   * The load at the start of a Put: a missing file or a zero-size file is an empty vault,
   * a stat or open error and a decode error are errors.
   */
  function LoadOrEmpty(file: FileState): (r: Result<SecretsValue, LoadError>)
    ensures r.Failure? <==> file.Inaccessible? || file.Corrupt?
    ensures file.Absent? || file.Empty? ==> r == Success(Live(map[]))
    ensures file.Holds? ==> r == Success(Live(file.secrets))
    ensures file.HoldsNull? ==> r == Success(Nil)
    ensures file.Inaccessible? ==> r == Failure(AccessFailed)
    ensures file.Corrupt? ==> r == Failure(DecodeFailed)
  {
    match file
    case Absent => Success(Live(map[]))
    case Inaccessible => Failure(AccessFailed)
    case Empty => Success(Live(map[]))
    case Holds(m) => Success(Live(m))
    case HoldsNull => Success(Nil)
    case Corrupt => Failure(DecodeFailed)
  }

  /**
   * The load at the start of a Get or a Delete: `os.Open` then decode, so a missing file is
   * an error, and so is a zero-size one (the decoder reads no value from it).
   */
  function LoadExisting(file: FileState): (r: Result<SecretsValue, LoadError>)
    ensures r.Success? <==> file.Holds? || file.HoldsNull?
    ensures file.Holds? ==> r == Success(Live(file.secrets))
    ensures file.HoldsNull? ==> r == Success(Nil)
    ensures file.Absent? || file.Inaccessible? ==> r == Failure(OpenFailed)
    ensures file.Empty? || file.Corrupt? ==> r == Failure(DecodeFailed)
  {
    match file
    case Absent => Failure(OpenFailed)
    case Inaccessible => Failure(OpenFailed)
    case Empty => Failure(DecodeFailed)
    case Holds(m) => Success(Live(m))
    case HoldsNull => Success(Nil)
    case Corrupt => Failure(DecodeFailed)
  }

  /** Which step of a rewrite fails, as the environment decides: `os.Create`, `json.MarshalIndent` or `Write`. */
  datatype WriteFault = NoFault | CreateFails | MarshalFails | WriteFails

  datatype WriteError = CreateFailed | MarshalFailed | WriteFailed

  function WriteErrorOf(fault: WriteFault): Option<WriteError> {
    match fault
    case NoFault => None
    case CreateFails => Some(CreateFailed)
    case MarshalFails => Some(MarshalFailed)
    case WriteFails => Some(WriteFailed)
  }

  /** The names of `m` that `json.MarshalIndent` writes as `key`. */
  function Colliding(m: Secrets, key: Bytes): set<Bytes> {
    set k | k in m && ReplaceInvalid(k) == key
  }

  /**
   * The map a decoder reads back from what `json.MarshalIndent(m)` wrote. Each name and
   * envelope is written with its invalid bytes replaced by U+FFFD; names are written in
   * string order, and where several are written alike the decoder keeps the last, so the
   * greatest of them supplies the envelope.
   */
  function Reloaded(m: Secrets): (r: DecodedSecrets)
    ensures r.Keys == set k | k in m :: ReplaceInvalid(k)
    ensures forall key :: key in r ==>
      Colliding(m, key) != {} && r[key] == ReplaceInvalid(m[Greatest(Colliding(m, key))])
  {
    map key | key in (set k | k in m :: ReplaceInvalid(k)) ::
      assert Colliding(m, key) != {} by {
        var k :| k in m && ReplaceInvalid(k) == key;
        assert k in Colliding(m, key);
      }
      ReplaceInvalid(m[Greatest(Colliding(m, key))])
  }

  /** A map of valid names and envelopes is read back exactly as it was written. */
  lemma ReloadedKeepsDecoded(m: Secrets)
    requires IsDecoded(m)
    ensures Reloaded(m) == m
  {
    forall k | k in m
      ensures ReplaceInvalid(k) == k && ReplaceInvalid(m[k]) == m[k]
    {
      ReplaceInvalidKeepsValid(k);
      ReplaceInvalidKeepsValid(m[k]);
    }
    var r := Reloaded(m);
    assert r.Keys == m.Keys;
    forall key | key in m
      ensures r[key] == m[key]
    {
      assert Colliding(m, key) == {key};
      assert IsGreatest({key}, key) by {
        ByteLeReflexive(key);
      }
      GreatestUnique({key});
    }
  }

  /**
   * The file after a whole-map rewrite. `os.Create` truncates before the map is marshalled,
   * so a failed marshal leaves an empty file and a failed write a partial one; only a failed
   * create leaves the old contents. A complete write holds the map as it will be read back.
   */
  function AfterRewrite(file: FileState, secrets: Secrets, fault: WriteFault): FileState {
    match fault
    case CreateFails => file
    case MarshalFails => Empty
    case WriteFails => Corrupt
    case NoFault => Holds(Reloaded(secrets))
  }

  /**
   * Two names written alike collapse into one entry under the valid spelling, holding the
   * envelope of the name that sorts last.
   */
  lemma CollisionKeepsLast(valid: Bytes, other: Bytes, first: Bytes, last: Bytes)
    requires IsValid(valid) && ReplaceInvalid(other) == valid && valid != other
    requires ByteLe(valid, other) && IsValid(last)
    ensures Reloaded(map[valid := first, other := last]) == map[valid := last]
  {
    var stored := map[valid := first, other := last];
    ReplaceInvalidKeepsValid(valid);
    var colliding := Colliding(stored, valid);
    assert colliding == {valid, other};
    assert IsGreatest(colliding, other) by {
      ByteLeReflexive(other);
    }
    GreatestUnique(colliding);
    ReplaceInvalidKeepsValid(last);
    var r := Reloaded(stored);
    assert r.Keys == {valid};
    assert r[valid] == last;
  }

  /** A complete rewrite of a map of valid names and envelopes leaves the file holding exactly that map. */
  lemma RewriteKeepsDecoded(file: FileState, m: Secrets)
    requires IsDecoded(m)
    ensures AfterRewrite(file, m, NoFault) == Holds(m)
  {
    ReloadedKeepsDecoded(m);
  }

  /** The file on disk, which outlives every invocation of the CLI. */
  class SecretsFile {
    var state: FileState

    constructor (initial: FileState)
      ensures state == initial
    {
      state := initial;
    }

    /** `os.Create(secretsFile)`, `json.MarshalIndent(secrets, "", "  ")`, `fw.Write(encJSON)`. */
    method Rewrite(secrets: Secrets, fault: WriteFault) returns (err: Option<WriteError>)
      modifies this
      ensures state == AfterRewrite(old(state), secrets, fault)
      ensures err == WriteErrorOf(fault)
    {
      if fault == CreateFails {
        return Some(CreateFailed);
      }
      state := Empty;
      if fault == MarshalFails {
        return Some(MarshalFailed);
      }
      if fault == WriteFails {
        state := Corrupt;
        return Some(WriteFailed);
      }
      state := Holds(Reloaded(secrets));
      err := None;
    }
  }
}
