/**
 * Failure-compatible result types shared by the link resolver and the
 * search pipeline. Every exception that escapes a helper of rs.py uncaught
 * is one `Error` value here.
 */
module Results {

  datatype Option<+T> = None | Some(value: T)

  /** Why a run of the search stops early. */
  datatype Error =
    | InvalidIpv6Url   // urlsplit: a netloc with '[' but no ']' or the reverse
    | InvalidBase64    // urlsafe_b64decode rejects the aggregator token
    | EmptyPayload     // nothing left after header/trailer stripping: bytes_array[0]

  datatype Result<+T> = Success(value: T) | Failure(error: Error) {

    predicate IsFailure() {
      Failure?
    }

    function PropagateFailure<U>(): Result<U>
      requires Failure?
    {
      Failure(error)
    }

    function Extract(): T
      requires Success?
    {
      value
    }
  }
}
