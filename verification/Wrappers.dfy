/** Absent values and error returns, shared by every module. */
module Wrappers {

  datatype Option<T> = None | Some(value: T)

  /** The errors that callers can tell apart. */
  datatype Error = Invalid | TooLarge | Unsupported | ResourceLimit | AddressInUse | NotAvailable | Unreachable | WrongFamily

  datatype Result<T> = Ok(value: T) | Err(error: Error)
}
