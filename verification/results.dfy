/**
 * Failure-carrying result types and the two error enumerations of the crate:
 * `SubjectError` (src/error.rs) for subject, pattern, parser, translator and
 * permission operations, and `CorrelationError` (src/correlation.rs) for
 * message identities and correlation chains. The human-readable message text
 * carried by each Rust variant is not modelled; only the variant is.
 */
module Results {

  datatype Option<+T> = None | Some(value: T)

  datatype Result<+T, +E> = Ok(value: T) | Err(error: E) {
    predicate IsFailure() {
      Err?
    }

    function PropagateFailure<U>(): Result<U, E>
      requires Err?
    {
      Err(error)
    }

    function Extract(): T
      requires Ok?
    {
      value
    }
  }

  /** The variants of `SubjectError`. */
  datatype SubjectError =
    | InvalidFormat
    | InvalidPattern
    | ParseError
    | PermissionDenied
    | TranslationError
    | CompositionError
    | ValidationError
    | NotFound

  /** The variants of `CorrelationError`. */
  datatype CorrelationError =
    | MissingCorrelation
    | MissingCausation
    | CyclicCausation
    | InvalidIdentity
}
