/**
 * Failure values shared by the byte readers and the TIFF decoder.
 *
 * `Error` lists the errors the decoder throws, plus `Trapped`, which stands
 * for a Swift runtime trap (an out-of-range subscript, a failed
 * `precondition`, an arithmetic overflow, a failed integer conversion, a
 * force-unwrap of nil or a failed debug `assert`). A trap ends the program in
 * the original; here it ends the decode with a value the caller can inspect.
 */
module Errors {

  /** Why a Swift runtime check stopped the program. */
  datatype Trap =
    | ReadPastEnd        // a byte subscript or a file read beyond the end of the data
    | SeekOutOfRange     // the `precondition` of `seek(to:)` / `seek(by:)`
    | CountTooLarge      // the `precondition(inCount < Int.max)` of the array readers
    | IndexOutOfRange    // an array subscript beyond the array
    | Overflow           // overflowing arithmetic or an integer conversion that does not fit
    | DivisionByZero     // integer division or remainder by zero
    | NegativeRange      // `0 ..< n` or an array of `n` elements with `n < 0`
    | UnwrappedNil       // `values.first!` on an empty list
    | FailedAssertion    // a debug `assert` that does not hold

  /** `TIFFImageA.Error`, plus runtime traps. */
  datatype Error =
    | InvalidTIFFFormat
    | InvalidOffsetSize(size: nat)
    | InvalidCompression
    | InvalidPredictor
    | InvalidModelType
    | InvalidRasterType
    | TagTypeConversionError
    | NoImage
    | Trapped(trap: Trap)

  datatype Option<+T> = None | Some(value: T)

  /** The outcome of a throwing operation; usable with `:-`. */
  datatype Result<+T> = Ok(value: T) | Err(error: Error) {

    predicate IsFailure() {
      Err?
    }

    function PropagateFailure<U>(): Result<U>
      requires Err?
    {
      Err(error)
    }

    function Extract(): T
      requires Ok?
    {
      value
    }
  }

  /** A Swift runtime trap of the given kind. */
  function Fail<T>(t: Trap): Result<T> {
    Err(Trapped(t))
  }
}
