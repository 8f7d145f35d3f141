/** Failure-carrying values for the library's exceptions and optional results. */
module Wrappers {

  datatype Option<+T> = None | Some(value: T)

  /** The exceptions the arithmetic class raises. `InvalidArgument` carries the
      message of PHP's InvalidArgumentException; `MalformedNumber` is the
      ValueError the decimal type raises for text it cannot read. */
  datatype Error =
    | InvalidArgument(message: string)
    | InvalidBase(base: int)
    | MalformedNumber(text: string)

  datatype Result<+T> = Ok(value: T) | Err(error: Error)
}
