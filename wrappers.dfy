/** Option and Result values used by the node lifecycle model. */
module Wrappers {

  /** A value that may be absent. */
  datatype Option<+T> = None | Some(value: T)

  /**
   * The outcome of a fallible transition. The failure arm carries an
   * implementation-defined message; no transition of the lifecycle ever
   * produces it.
   */
  datatype Result<+T> = Ok(value: T) | Err(message: string)
}
