/** Values shared by every component: Java's nullable references as Option, and the
    exceptions the core throws as the error half of a Result. */
module Exceptions {

  /** A nullable Java reference: None stands for null. */
  datatype Option<+T> = None | Some(value: T)

  /** The exceptions raised by the modelled code (or by the library calls it makes). */
  datatype Error =
    | JWTVerification(reason: string)          // thrown by the JWT library's verifier
    | InvalidJwtAuthentication(message: string)
    | UsernameNotFound(message: string)
    | ResourceNotFound(message: string)
    | RequiredObjectIsNull(message: string)
    | IllegalArgument(message: string)         // thrown by the repository for a null id

  /** A call either returns a value or throws. */
  datatype Result<+T> = Success(value: T) | Failure(error: Error)

  const ExpiredOrInvalidMessage: string := "Expired or invalid JWT token!"
  const NoRecordsMessage: string := "No records found for this ID!"
  const NullObjectMessage: string := "It is not allowed to persist a null object!"
  const NullIdMessage: string := "The given id must not be null"
}
