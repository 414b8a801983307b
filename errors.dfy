/** Failure results standing in for the machine's configuration exception. */
module Errors {

  /** The two ways the engine can refuse: a bad configuration, or a symbol
      looked up that is not in the alphabet. */
  datatype Error =
    | ConfigError(reason: string)
    | NotInAlphabet(symbol: char)

  /** A value, or the error that a thrown exception would have carried. */
  datatype Result<+T> = Ok(value: T) | Err(error: Error)

  /** The outcome of an operation that returns nothing but may throw. */
  datatype Outcome = Pass | Fail(error: Error)
}
