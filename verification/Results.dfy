/** The error sets of the artifact modules and the result type that carries them. */
module Results {

  datatype Error =
    | InvalidArtifact
    | ChecksumMismatch
    | UnsupportedArtifactVersion
    | ArtifactLimitExceeded
    | CapsuleLimitExceeded
    | SchemaMismatch
    | UnsupportedValue
    | UnsupportedHashKey
    | UnsupportedContainerState
    | ArtifactConstructionFailed
    | NoSpaceLeft
    | MemoryLimitExceeded
    | OutOfMemory

  datatype Option<+T> = None | Some(value: T)

  /** A failure-compatible result, usable with `:-`. */
  datatype Result<+T> = Ok(value: T) | Err(error: Error) {
    predicate IsFailure() {
      Err?
    }

    function PropagateFailure<U>(): Result<U>
      requires Err?
    {
      Err(error)
    }

    function Extract(): T
      requires Ok?
    {
      value
    }
  }

  /** The guard of an early `return error.X`. */
  function Require(condition: bool, error: Error): Result<()> {
    if condition then Ok(()) else Err(error)
  }
}
