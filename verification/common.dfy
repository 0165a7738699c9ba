/** Values that may be absent (a JSON field missing from a request body, a
    `parseInt` that yields NaN, an `Array.prototype.find` that matches
    nothing), and the HTTP status codes shared by every handler. */
module Common {

  datatype Option<+T> = None | Some(value: T)

  /** The HTTP status codes the handlers answer with. */
  const OK := 200
  const CREATED := 201
  const BAD_REQUEST := 400
  const NOT_FOUND := 404
  const SERVER_ERROR := 500

}
