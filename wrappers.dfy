/** Failure-carrying results: the C++ code reports errors by throwing
    std::invalid_argument (or by an out-of-bounds access that Armadillo or
    mlpack turn into an exception); the model returns them as values. */
module Wrappers {

  /** The kinds of exception the modelled code can raise. */
  datatype Error =
    | InvalidArgument(message: string)  // std::invalid_argument with its message
    | RankOutOfRange                     // rank t not below the sample count: the search throws or reads past its result

  datatype Result<T> = Ok(value: T) | Err(error: Error)

  datatype Outcome = Pass | Fail(error: Error)

  /** A pointer argument that may be null. */
  datatype Option<T> = None | Some(value: T)
}
