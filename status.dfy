/** Return codes of the library, reduced to the cases the modelled operations
    can produce, and the result wrappers used by the modelled calls. */
module Status {

  datatype Error =
    | InvalidLength      // data length is not a multiple of the block size
    | InvalidIVLength    // initialization vector of a length the mode does not accept
    | InvalidParameter   // unsupported section size, tag length or key pairing
    | InvalidKeyLength   // key material of the wrong length
    | IVNotSet           // a mode was asked to continue a counter that is not available
    | PhaseViolation     // an MGM call out of the clean / update / finalize order
    | DataTooLong        // a bit counter would not fit its length field

  /** The outcome of a call that produces a value. */
  datatype Result<T> = Ok(value: T) | Fail(error: Error)

  /** The outcome of a call that only changes state. */
  datatype Outcome = Success | Failure(error: Error)

  datatype Option<T> = None | Some(value: T)
}
