/** Failure-carrying values shared by the client and the server models. */
module Results {

  datatype Option<+T> = None | Some(value: T)

  /** The exceptions the server's payload extraction can raise. */
  datatype Error =
    | IndexOutOfRange   // `split(",")[1]` on text without a comma
    | InvalidBase64     // `base64.b64decode` rejecting the payload

  datatype Result<+T> = Ok(value: T) | Err(error: Error)
}
