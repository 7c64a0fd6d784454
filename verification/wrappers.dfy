/** Failure-carrying values shared by every module of the checker model. */
module Wrappers {

  /** An optional value: the source's `None` or a present value. */
  datatype Option<+T> = None | Some(value: T)

  /** The exceptions the checker can raise before it writes any output. */
  datatype Error =
    /** Asking for the first sub-folder of a mask root that has none. */
    | NoCaseFolder
    /** A pandas or dictionary lookup of a key that is not there. */
    | MissingKey(key: string)

  /** Either a computed value or the exception that stopped the computation. */
  datatype Result<+T> = Ok(value: T) | Err(error: Error)
}
