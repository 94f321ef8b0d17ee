/**
  Abstract exchanges with the upstream hosting API. Every HTTP call of the
  service is replaced by the response it produced, so the model performs no I/O.
 */
module Http {

  datatype Option<+T> = None | Some(value: T) {
    /** The wrapped value, or `default` when there is none (Python's `dict.get(key, default)`). */
    function GetOr(default: T): T {
      match this
      case Some(v) => v
      case None => default
    }
  }

  /** An explicit result type standing for a Python return value or a raised exception. */
  datatype Result<+T, +E> = Success(value: T) | Failure(error: E)

  /** The outcome of decoding a response body as JSON (`resp.json()` may raise). */
  datatype Decoded<+B> = Parsed(value: B) | Unparsable(reason: string)

  /**
    One upstream response: a status code with its decoded body and its raw text,
    or a transport exception raised before any status arrived.
   */
  datatype Response<+B> =
    | Status(code: int, body: Decoded<B>, text: string)
    | Transport(msg: string)
  {
    predicate HasCode(c: int) {
      Status? && code == c
    }

    /** The response arrived with the given code and a body that decodes. */
    predicate ParsedWith(c: int) {
      Status? && code == c && body.Parsed?
    }
  }
}
