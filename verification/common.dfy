/** Shared wrappers: optional values and the JSON replies a route handler returns. */
module Common {

  /** A value that may be absent: `undefined`/`null` in the source. */
  datatype Option<+T> = None | Some(value: T) {
    function GetOr(default: T): T {
      match this
      case Some(v) => v
      case None => default
    }
  }

  /** What a route handler hands back: a JSON body with a status, or an `{ error }` body. */
  datatype Reply<+T> = Ok(status: int, body: T) | Err(status: int, error: string)

  const OK := 200
  const CREATED := 201
  const BAD_REQUEST := 400
  const UNAUTHORIZED := 401
  const NOT_FOUND := 404
  const SERVER_ERROR := 500
}
