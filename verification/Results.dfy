/** Outcomes: the error kinds of `core/src/error.rs` and the failure-compatible wrappers around them. */
module Results {

  datatype Option<+T> = None | Some(value: T)

  /** The error kinds; byte counts and message texts are not kept. */
  datatype DpapiError =
    | TooShort
    | UnsupportedVersion(version: nat)
    | NotDpapiProvider(shown: seq<int>)
    | UnsupportedAlgId(id: nat)
    | InvalidKeyLength
    | DecryptionFailed
    | HmacMismatch
    | Utf16Error
    | DomainBackupUnsupported
    | Base64Error
    | MissingDpapiPrefix(shown: seq<int>)
    | UnexpectedKeyLength(expected: nat, got: nat)
    | InvalidHex

  datatype Result<+T> = Ok(value: T) | Err(error: DpapiError) {
    predicate IsFailure() {
      Err?
    }

    function PropagateFailure<U>(): Result<U>
      requires Err?
    {
      Err(error)
    }

    function Extract(): T
      requires Ok?
    {
      value
    }
  }
}
