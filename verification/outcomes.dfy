/** Failure-carrying values used by the locker model. Each `Error` stands for
    the .NET exception the locker throws or lets escape. */
module Outcomes {

  datatype Error =
    | UnsupportedFormat   // ArgumentException: the bitmap is not 8, 24 or 32 bpp
    | RegionLocked        // the bitmap refuses a second LockBits while it is locked
    | IndexOutOfRange     // the explicit check in GetPixel, or an array bound
    | NullReference       // the pixel buffer is used before any successful lock

  /** A value or the exception that replaced it. */
  datatype Result<+T> = Ok(value: T) | Err(error: Error)

  /** How a state-changing call ended: it returned, or it threw. */
  datatype Outcome = Done | Thrown(error: Error)

  /** A reference that may be null. */
  datatype Option<+T> = None | Some(value: T)
}
