/** Failure-carrying datatypes shared by the whole model.
    - Option<T> for values that may be absent,
    - Result<T, E> for the `neverthrow` results the server code returns,
    - Completion<T> for a call into JavaScript that either returns normally
      or throws an exception (the try/catch boundary of the source).
 */
module Wrappers {

  datatype Option<+T> = None | Some(value: T)

  /** `ok(value)` or `err(error)` of the `neverthrow` library. */
  datatype Result<+T, +E> = Ok(value: T) | Err(error: E)

  /** An exception object thrown by foreign JavaScript code. Its contents
      are opaque to the server logic, which only forwards it. */
  datatype JsError = JsError(message: string)

  /** The outcome of calling a foreign JavaScript function: a normal
      return with a value, or a thrown exception. */
  datatype Completion<+T> = Normal(value: T) | Throw(error: JsError)
}
