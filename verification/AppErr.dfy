/** Errors as the use cases return them: a kind and a message. The wrapped cause is dropped. */
module AppErr {
  datatype Error =
    | NotFound(message: string)
    | Invalid(message: string)
    | Unauthorized(message: string)
    | Forbidden(message: string)
    | TooMany(message: string)
    | Internal(message: string)

  datatype Option<+T> = None | Some(value: T)

  datatype Result<+T> = Ok(value: T) | Err(error: Error)
}
