/** Failure-carrying results shared by every identifier kind.

    Go reports failures in three ways in this code base: a returned `error`,
    a `panic`, and (for `decodeUUID`) nothing at all.  The first two are both
    modelled as an `Err` carrying one of the `Error` values below, so that a
    caller-visible failure is never a precondition of the model. */
module Wrappers {

  datatype Option<+T> = None | Some(value: T)

  datatype Result<+T, +E> = Ok(value: T) | Err(error: E)

  /** The failures raised or returned by the identifier code. */
  datatype Error =
    | InvalidParameterCount        // variadic group/base argument given more than once
    | InvalidGroup                 // group outside the kind's group field
    | ClockMovedBackwards          // SUID builder saw a clock reading below its zero time
    | InvalidLength                // text form is not 16 bytes
    | InvalidCharacter(c: bv8)     // text form holds a byte outside the alphabet
    | InvalidJson                  // JSON text is not 18 bytes framed by quotes
}
