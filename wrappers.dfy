/** Small value types shared by every module: an optional value and the HTTP status a handler answers with. */
module Wrappers {

  /** A JavaScript value that may be `null` or `undefined` */
  datatype Option<+T> = None | Some(value: T)

  /** The status codes the controllers set before answering or throwing. */
  datatype Status = Ok | Created | BadRequest | Unauthorized | Forbidden | NotFound | ServerError {
    function Code(): (c: nat)
      ensures 200 <= c < 600
      ensures (c < 300) <==> (this == Ok || this == Created)
    {
      match this
      case Ok => 200
      case Created => 201
      case BadRequest => 400
      case Unauthorized => 401
      case Forbidden => 403
      case NotFound => 404
      case ServerError => 500
    }
  }

  /** JavaScript truthiness of an optional string: `null`, `undefined` and `''` are falsy. */
  predicate TruthyStr(s: Option<string>) {
    s.Some? && s.value != ""
  }

  /** JavaScript truthiness of an optional number: `null`, `undefined` and `0` are falsy. */
  predicate TruthyNat(n: Option<nat>) {
    n.Some? && n.value != 0
  }
}
