/** Option and Result values shared by the breakpoint table and the resolver. */
module Common {

  /** `None` stands for JavaScript's `undefined` (or `NaN` for a number). */
  datatype Option<+T> = None | Some(value: T)

  /** A computation that either produced a value or was refused with an error. */
  datatype Result<+R, +E> = Ok(value: R) | Err(error: E)
}
