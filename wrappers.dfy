/** Optional values (Java's nullable references), the service's error outcomes and Java's `int` range. */
module Wrappers {

  /** A Java reference that may be null: `None` stands for null. */
  datatype Option<+T> = None | Some(value: T) {
    /** The value, or `default` when null (as in `banned == null ? false : banned`). */
    function GetOr(default: T): T {
      match this
      case Some(v) => v
      case None => default
    }
  }

  /** The exceptions the service throws, by the HTTP status they are translated to. */
  datatype Error =
    | BadRequest        // BadRequestException
    | NotFound          // NotFoundException
    | IndexOutOfBounds  // thrown by List.subList for a negative start index

  /** A normal return with a value, or a thrown exception. */
  datatype Result<+T> = Ok(value: T) | Err(error: Error)

  /** A normal return of a `void` method, or a thrown exception. */
  datatype Outcome = Done | Fail(error: Error)

  /** `Integer.MAX_VALUE`, the largest Java `int`. */
  const IntMax := 0x7fff_ffff
}
