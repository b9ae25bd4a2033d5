/** Failure-carrying wrappers shared by the other modules. */
module Results {

  /** A value that may be missing: a lookup that found nothing is `None`. */
  datatype Option<+T> = None | Some(value: T)

  /** The outcome of a whole run: the annotated table, or the reason it was aborted. */
  datatype Result<+T, +E> = Ok(value: T) | Err(error: E)
}
