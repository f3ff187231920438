/** Results and errors shared by the models. */
module Outcomes {

  datatype Option<+T> = None | Some(value: T)

  /** The error kinds callers can tell apart (domain/errors.go, port/errors.go, porttest/errors.go). */
  datatype Error =
    | InvalidValue
    | PolicyViolation
    | NotPermitted
    | InvalidTransition
    | Conflict
    | Expired
    | AlreadyConsumed
    | NotFound
    | Duplicate
    | VersionConflict

  datatype Result<+T> = Ok(value: T) | Err(error: Error) {
    predicate IsFailure() { Err? }

    function PropagateFailure<U>(): Result<U>
      requires Err?
    {
      Err(error)
    }

    function Extract(): T
      requires Ok?
    {
      value
    }
  }

  /** Instants are UTC microseconds; 0 is "unset" to every IsZero check. */
  type Instant = int

  const MICROS_PER_SECOND: int := 1_000_000
  const MICROS_PER_DAY: int := 86_400_000_000

  /** The project-wide rule: now >= expiresAt is expired. */
  predicate IsExpiredAt(expiresAt: Instant, now: Instant) { now >= expiresAt }
}
