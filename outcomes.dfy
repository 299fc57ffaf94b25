/** The outcomes of the authenticator's operations. A Java exception becomes
    an `Err` carrying one of the two kinds of failure the class can raise. */
module Outcomes {

  datatype Option<T> = None | Some(value: T)

  /** `InvalidArgument`: a missing secret or an out-of-range window size
      (thrown as `GoogleAuthenticatorException`). `OperationUnavailable`: the
      cryptographic provider failed (no HmacSHA1, key rejected); the source
      logs it and rethrows a generic exception without the details. */
  datatype Error = InvalidArgument | OperationUnavailable

  datatype Result<T> = Ok(value: T) | Err(error: Error)
}
