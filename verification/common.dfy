/** Value wrappers shared by every module of the model. */
module Common {

  /** A value that may be absent (JavaScript `undefined`/`null`). */
  datatype Option<+T> = None | Some(value: T)

  /** The outcome of an operation that may end in an error response or a thrown exception. */
  datatype Result<+T, +E> = Success(value: T) | Failure(error: E)

  /** A JSON request body: an array of requests or a single one. */
  datatype Body<+T> = Many(requests: seq<T>) | One(request: T)

  /** `Array.isArray(body) ? body : [body]`: a single request is a batch of one. */
  function Requests<T>(body: Body<T>): (rs: seq<T>)
    ensures body.One? ==> rs == [body.request]
    ensures body.Many? ==> rs == body.requests
  {
    match body
    case Many(rs) => rs
    case One(r) => [r]
  }

  /**
   * A JavaScript number restricted to what the modelled code can produce:
   * an integer, or NaN (from `parseInt` of text without digits, or `x % 0`).
   */
  datatype Num = Int(v: int) | NaN

  function Abs(x: int): nat {
    if x < 0 then -x else x
  }

  /**
   * JavaScript `a % b` on integers: NaN for a zero divisor, otherwise the
   * remainder of truncating division, whose sign follows the dividend.
   */
  function JsRem(a: int, b: int): (r: Num)
    ensures b == 0 <==> r == NaN
    ensures r.Int? && a >= 0 ==> 0 <= r.v < Abs(b)
    ensures r.Int? && a < 0 ==> -(Abs(b) as int) < r.v <= 0
  {
    if b == 0 then NaN
    else if a >= 0 then Int(a % Abs(b))
    else Int(-((-a) % Abs(b)))
  }
}
