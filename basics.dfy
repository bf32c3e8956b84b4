/** Nullable values and error outcomes, the two shapes the application's
    Python code expresses with `None` and with raised HTTP errors. */
module Basics {

  /** A column or argument that may be `None`. */
  datatype Option<+T> = None | Some(value: T) {
    function GetOr(default: T): T {
      match this
      case Some(v) => v
      case None => default
    }
  }

  /** A computation that either yields a value or fails with an HTTP status code. */
  datatype Result<+T> = Ok(value: T) | Err(code: int)

  /** What a route handler answers: a redirect with its status code and
      target, a rendered page, or an unhandled exception (HTTP 500). */
  datatype Response = Redirect(code: int, location: string) | Rendered | ServerError

  /** Python truthiness of an optional string form field: `None` and `""` are false. */
  predicate Given(s: Option<string>) {
    s.Some? && s.value != ""
  }

  /** Python truthiness of an optional integer form field: `None` and `0` are false. */
  predicate GivenInt(n: Option<int>) {
    n.Some? && n.value != 0
  }
}
