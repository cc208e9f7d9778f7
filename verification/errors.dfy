/** Failure values of the path finder and the wrappers that carry them. */
module Errors {

  /** The two exceptions the orchestration layer itself can raise:
      `IndexError` (indexing or deleting past the end of a list) and
      the `RuntimeError('Unknown point_spec')` of the waypoint dispatch. */
  datatype Error = IndexOutOfRange | UnknownPointSpec

  /** A value that may be absent, such as an optional key of a config mapping. */
  datatype Option<T> = None | Some(value: T)

  /** Either a value or the exception that was raised instead. */
  datatype Result<T> = Ok(value: T) | Err(error: Error)
}
