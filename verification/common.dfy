/** Failure-carrying datatypes shared by the model of the arbitrary-point coupling interface. */
module Common {

  /** An optional value; `None` stands for an invalid iterator or a failed search. */
  datatype Option<+T> = None | Some(value: T)

  /** The fatal condition the interface raises for an unsupported request
      (`ExcNotImplemented`). Its other checks are not failures of the model: the
      `ExcNotInitialized` checks and the ID checks of mesh processing are preconditions,
      and the `ExcInternalError` length checks are proved as postconditions. */
  datatype Failure = NotImplemented

  /** The outcome of an operation that may stop with `ExcNotImplemented`. */
  datatype Result<+T> = Ok(value: T) | Err(error: Failure)
}
