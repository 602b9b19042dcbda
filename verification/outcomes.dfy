/**
 * Failure-carrying values shared by the engine.  The engine throws an
 * IllegalArgumentException (or lets a runtime exception escape) before it
 * produces any output; here that becomes an `Err` value naming the cause.
 */
module Outcomes {

  /** A reference that may be null. */
  datatype Option<+T> = None | Some(value: T)

  /** Why an engine operation refused its arguments. */
  datatype Error =
    | MissingImage       // a null image argument
    | InvalidRange       // a scalar argument outside its documented bounds
    | InvalidLevelOrder  // black > mid or mid > white
    | DimensionMismatch  // a second image too small for the pixels read from it
    | IndexOutOfRange    // an array index the source does not guard
    | DivisionByZero     // an integer division whose divisor is zero
    | EmptyImage         // a raster of zero width or height, which `new BufferedImage` refuses

  /** The outcome of an engine operation: a value or the reason it was refused. */
  datatype Result<+T> = Ok(value: T) | Err(error: Error)
}
