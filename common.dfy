/** Value wrappers shared by the whole model. */
module Common {

  /** A value or nothing: `T | null` and `T | undefined` in the source. */
  datatype Option<+T> = None | Some(value: T)

  /** The outcome of an operation that either returns a value or throws an `Error` carrying a message. */
  datatype Result<+T> = Ok(value: T) | Err(message: string)

  /**
   * One key of a JavaScript object literal used as a partial update: the key is left out,
   * the key is present with the value `undefined` (or `null`, which both merge rules treat the
   * same way), or the key is present with a value.
   */
  datatype Slot<+T> = Absent | Undefined | Value(value: T)
}
