/** Optional values and success-or-failure results, used for Python's `None`
    and for the exceptions raised by the comparison. */
module Results {

  datatype Option<+T> = None | Some(value: T)

  datatype Result<+T, +E> = Success(value: T) | Failure(error: E)
}
