/** Small value types shared by every module: an optional value and the
    outcome of one request handler. */
module Wrappers {

  datatype Option<+T> = None | Some(value: T)

  /** What a handler answers. `Ok` carries the JSON body; the others are the
      HTTP failures the handlers return (400, 403, 404, 500). */
  datatype Response<+T> =
    | Ok(value: T)
    | BadRequest
    | Forbidden
    | NotFound
    | InternalError

  /** A request header as Flask's `request.headers.get` sees it: absent or a string. */
  type Header = Option<string>

  /** Python's truth test on a value that is None or a string (a header, a
      query argument, a cache slot): only a present, non-empty string passes. */
  predicate Truthy(v: Option<string>)
  {
    v.Some? && v.value != ""
  }
}
