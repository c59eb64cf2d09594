/** Failure-carrying datatypes shared by the whole model. */
module Results {

  /** A value that may be missing (a lookup that found nothing). */
  datatype Option<+T> = None | Some(value: T)

  /** A computation that either yields a value or fails with an error. */
  datatype Result<+R, +E> = Success(value: R) | Failure(error: E)

  /** The answer an endpoint gives: it accepted the request or refused it with an error. */
  datatype Reply<+E> = Accepted | Refused(error: E)
}
