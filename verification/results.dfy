/** Optional values and success/failure results, used in place of Python's
    `None` returns and of the string errors the validators hand back. */
module Results {

  datatype Option<+T> = None | Some(value: T)

  datatype Result<+R, +E> = Success(value: R) | Failure(error: E)
}
