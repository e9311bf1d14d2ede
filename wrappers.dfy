/** Option and Result values standing for the source's null references and exceptions. */
module Wrappers {

  /** `None` stands for a null reference, or for a call into a collaborator that threw. */
  datatype Option<+T> = None | Some(value: T)

  /** `Failure` carries the message of the exception the source throws. */
  datatype Result<+R> = Success(value: R) | Failure(message: string)
}
