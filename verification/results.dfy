/** Failure-carrying datatypes shared by the synchroniser's modules: an
    optional value (JavaScript's `null`/`undefined` versus a value) and the
    outcome of a step that may abort the run. */
module Results {

  datatype Option<+T> = None | Some(value: T)

  datatype Result<+T, +E> = Success(value: T) | Failure(error: E)
}
