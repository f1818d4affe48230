/**
 * The exceptions the ST_Geometry codec raises, and the failure-compatible
 * result type that carries them through the model.
 */
module Errors {

  /** The .NET exception kinds the codec and the geometry entities can throw. */
  datatype Error =
    | ArgumentException            // malformed payload, missing Z origin, wrong header length
    | ArgumentOutOfRangeException  // a List<T> read past its end
    | IndexOutOfRangeException     // an array read past its end, or a restart marker that wrapped
    | NotSupportedException        // the M axis, an unknown dimension flag
    | OverflowException            // a decimal digit that does not fit in a byte
    | DivideByZeroException        // a zero radius in the coordinate system
    | NullReferenceException       // an ordinate read through a flag that has no value behind it
    | FormatException              // ordinate text that is not a number

  /** Either a value or the exception that the source would have thrown. */
  datatype Result<+T> = Ok(value: T) | Err(error: Error) {

    predicate IsFailure() {
      Err?
    }

    function PropagateFailure<U>(): Result<U>
      requires Err?
    {
      Err(error)
    }

    function Extract(): T
      requires Ok?
    {
      value
    }
  }

  /** An optional value: a C# nullable, or an argument that may be omitted. */
  datatype Option<+T> = None | Some(value: T)
}
