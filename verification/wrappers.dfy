/** Failure-carrying datatypes shared by the whole model. */
module Wrappers {

  /** An optional value: `None` stands for an absent (`undefined`) field. */
  datatype Option<+T> = None | Some(value: T)

  /** What an HTTP handler sends back: a 200 response carrying data, or an
      error status with the short message the handler puts in its body. */
  datatype Reply<+T> = Success(data: T) | Failure(status: int, error: string)
}
