/** Optional values and fallible results: where RichConsole passes `None` or
    raises, the model returns one of these. */
module Wrappers {

  /** A value that may be absent, as a Python argument defaulting to `None`. */
  datatype Option<T> = None | Some(value: T)

  /** The value if present, `fallback` otherwise. */
  function ValueOr<T>(o: Option<T>, fallback: T): T {
    if o.Some? then o.value else fallback
  }

  /** The outcome of an operation that can raise: its value or the error. */
  datatype Result<R, E> = Success(value: R) | Failure(error: E)
}
