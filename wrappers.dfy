/** Option, Result and Outcome values, and the error kinds the package raises. */
module Wrappers {

  datatype Option<+T> = None | Some(value: T)

  /** The outcome of an operation that yields a value or raises one of the errors below. */
  datatype Result<+T> = Success(value: T) | Failure(error: Error)

  /** The outcome of an operation that yields nothing or raises one of the errors below. */
  datatype Outcome = Pass | Fail(error: Error)

  /** What can be raised while capturing or restoring a closure. */
  datatype Error =
    /** MissingSecretKeyException: a Signed variant was captured with no signer configured. */
    | MissingSecretKey
    /** InvalidSignatureException: a tag did not verify, or an unsigned variant arrived while a
        signer is configured. */
    | InvalidSignature
    /** The PHP Error raised when the unserialised payload is not an object with getClosure(). */
    | MalformedPayload
    /** The PHP Error raised when a typed static property is read before it was ever assigned. */
    | UninitializedSigner
}
