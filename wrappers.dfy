/** Option and Result wrappers shared by every module of the model. */
module Wrappers {
  datatype Option<T> = None | Some(value: T)

  /** What the source throws: a parse error reported to the user, an internal
      error (a broken invariant of the library itself), an invalid operand
      of an intersection, or a `TypeError` raised by the host itself. */
  datatype Thrown =
    | ParseError(message: string)
    | InternalError(message: string)
    | InvalidOperand(message: string)
    | HostTypeError(message: string)

  datatype Result<T> = Ok(value: T) | Err(error: Thrown)
}
