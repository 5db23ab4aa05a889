/** The outcomes the request handlers report, one constructor per kind of
    error response the controllers and middleware emit. The `error` strings are
    the ones the handlers put in their JSON bodies. */
module Http {

  datatype Failure =
    | BadRequest(error: string)
      /** 403 without details: no project access, or no role on the request. */
    | Forbidden(error: string)
      /** 403 "Insufficient permissions", carrying the gate's allowed list and
          the caller's role. */
    | InsufficientRole(required: seq<string>, current: string)
    | NotFound(error: string)
      /** 500: the store rejected the write (unknown row, constraint, bad value). */
    | ServerError(error: string)

  /** The 400 a handler sends when the route's validators reported errors. */
  const ValidationFailed: Failure := BadRequest("Validation failed")

  function Status(f: Failure): int {
    match f
    case BadRequest(_) => 400
    case Forbidden(_) => 403
    case InsufficientRole(_, _) => 403
    case NotFound(_) => 404
    case ServerError(_) => 500
  }
}
